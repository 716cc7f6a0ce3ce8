/** The request body of `POST /tasks` and `PATCH /tasks/:id`, and its validation rules. */
module TaskDto {
  import opened Common
  import opened Validation

  /** The DTO-level status enumeration; each member's value is its wire spelling. */
  datatype TaskStatusEnum = Pending | InProgress | Completed | Blocked

  const EnumValues: seq<string> := ["pending", "in-progress", "completed", "blocked"]

  function EnumValue(e: TaskStatusEnum): (s: string)
    ensures s in EnumValues
  {
    match e
    case Pending => "pending"
    case InProgress => "in-progress"
    case Completed => "completed"
    case Blocked => "blocked"
  }

  /** The member whose value is `s`, if any: exactly the values `@IsEnum` accepts. */
  function ParseEnum(s: string): (r: Option<TaskStatusEnum>)
    ensures r.Some? <==> s in EnumValues
    ensures r.Some? ==> EnumValue(r.value) == s
  {
    if s == "pending" then Some(Pending)
    else if s == "in-progress" then Some(InProgress)
    else if s == "completed" then Some(Completed)
    else if s == "blocked" then Some(Blocked)
    else None
  }

  /** A validated `CreateTaskDto`; `UpdateTaskDto` extends it without change. */
  datatype CreateTaskDto = CreateTaskDto(
    title: string,
    description: Field<string>,
    status: Field<TaskStatusEnum>,
    priority: Field<int>,
    deadline: string,
    projectId: int,
    assignedUserId: Field<int>)

  type UpdateTaskDto = CreateTaskDto

  /** The properties the DTO declares; the whitelist drops every other one. */
  const Keys: set<string> := {"title", "description", "status", "priority", "deadline", "projectId", "assignedUserId"}

  /** The decorators of `CreateTaskDto`, property by property. */
  predicate ValidBody(body: Body, isDateString: string -> bool)
  {
    && Required(body, "title", IsString)
    && Optional(body, "description", IsString)
    && Optional(body, "status", v => IsEnum(v, EnumValues))
    && Optional(body, "priority", v => IsInt(v) && InRange(v, 1, 5))
    && Required(body, "deadline", v => IsFormatted(v, isDateString))
    && Required(body, "projectId", IsInt)
    && Optional(body, "assignedUserId", IsInt)
  }

  /** The same rules stated on a typed DTO: what a validated DTO always satisfies. */
  predicate Valid(dto: CreateTaskDto, isDateString: string -> bool)
  {
    && isDateString(dto.deadline)
    && (dto.priority.Present? ==> 1 <= dto.priority.value <= 5)
  }

  function EnumOf(v: Json): TaskStatusEnum
  {
    match ParseEnum(StrOf(v))
    case Some(e) => e
    case None => Pending
  }

  function EnumJson(e: TaskStatusEnum): Json { JString(EnumValue(e)) }

  /** The JSON a client sends for property `key` of a DTO, if any. */
  function PropertyOf(dto: CreateTaskDto, key: string): Option<Json>
  {
    if key == "title" then Some(StrJson(dto.title))
    else if key == "description" then EncodeField(dto.description, StrJson)
    else if key == "status" then EncodeField(dto.status, EnumJson)
    else if key == "priority" then EncodeField(dto.priority, IntJson)
    else if key == "deadline" then Some(StrJson(dto.deadline))
    else if key == "projectId" then Some(IntJson(dto.projectId))
    else if key == "assignedUserId" then EncodeField(dto.assignedUserId, IntJson)
    else None
  }

  /** The body a client sends for a DTO. */
  function ToBody(dto: CreateTaskDto): (b: Body)
  {
    map k | k in Keys && PropertyOf(dto, k).Some? :: PropertyOf(dto, k).value
  }

  /** What plain-to-class transformation makes of a body (meaningful once it passed validation). */
  function Transform(body: Body): CreateTaskDto
  {
    CreateTaskDto(
      StrOf(Prop(body, "title")),
      OptionalField(body, "description", StrOf),
      OptionalField(body, "status", EnumOf),
      OptionalField(body, "priority", IntOf),
      StrOf(Prop(body, "deadline")),
      IntOf(Prop(body, "projectId")),
      OptionalField(body, "assignedUserId", IntOf))
  }

  /**
   * The ValidationPipe: a body passes exactly when every decorator holds
   * (otherwise the request fails with 400), and the DTO it produces
   * satisfies the typed rules and is what the client sent, minus the
   * properties the DTO does not declare.
   */
  function Validate(body: Body, isDateString: string -> bool): (r: Option<CreateTaskDto>)
    ensures r.Some? <==> ValidBody(body, isDateString)
    ensures r.Some? ==> Valid(r.value, isDateString)
    ensures r.Some? ==> ToBody(r.value) == Whitelist(body, Keys)
  {
    if ValidBody(body, isDateString) then
      WhitelistRoundTrip(body, isDateString);
      Some(Transform(body))
    else
      None
  }

  /** Transforming a valid body and encoding the result again gives back its whitelisted part. */
  lemma WhitelistRoundTrip(body: Body, isDateString: string -> bool)
    requires ValidBody(body, isDateString)
    ensures Valid(Transform(body), isDateString)
    ensures ToBody(Transform(body)) == Whitelist(body, Keys)
  {
    var dto := Transform(body);
    OptionalStringRoundTrip(body, "description");
    OptionalIntRoundTrip(body, "priority");
    OptionalIntRoundTrip(body, "assignedUserId");
    IntOfRoundTrip(body["projectId"]);
    if "priority" in body && body["priority"] != JNull {
      IntOfRoundTrip(body["priority"]);
    }
    forall k | k in Keys
      ensures PropertyOf(dto, k) == Get(body, k)
    {
    }
    var b, w := ToBody(dto), Whitelist(body, Keys);
    forall k | k in Keys
      ensures (k in b <==> k in w) && (k in b ==> b[k] == w[k])
    {
      assert PropertyOf(dto, k) == Get(body, k);
    }
    assert b.Keys == w.Keys;
  }

  /** The body a client sends for a DTO holds exactly the DTO's encoded properties. */
  lemma ToBodyProperties(dto: CreateTaskDto)
    ensures forall k :: Get(ToBody(dto), k) == PropertyOf(dto, k)
  {
  }

  /** Transforming what a client sends for a DTO gives the DTO back. */
  lemma TransformToBody(dto: CreateTaskDto)
    ensures Transform(ToBody(dto)) == dto
  {
    var b := ToBody(dto);
    ToBodyProperties(dto);
    IntRoundTrip(dto.projectId);
    OptionalFieldOfEncoding(b, "description", dto.description, StrJson, StrOf);
    if dto.status.Present? {
      assert EnumOf(EnumJson(dto.status.value)) == dto.status.value;
    }
    OptionalFieldOfEncoding(b, "status", dto.status, EnumJson, EnumOf);
    if dto.priority.Present? { IntRoundTrip(dto.priority.value); }
    OptionalFieldOfEncoding(b, "priority", dto.priority, IntJson, IntOf);
    if dto.assignedUserId.Present? { IntRoundTrip(dto.assignedUserId.value); }
    OptionalFieldOfEncoding(b, "assignedUserId", dto.assignedUserId, IntJson, IntOf);
  }

  /** What a client sends for a DTO passes the decorators exactly when the DTO obeys the typed rules. */
  lemma ValidBodyToBody(dto: CreateTaskDto, isDateString: string -> bool)
    ensures ValidBody(ToBody(dto), isDateString) <==> Valid(dto, isDateString)
  {
    ToBodyProperties(dto);
    IntRoundTrip(dto.projectId);
    if dto.priority.Present? { IntRoundTrip(dto.priority.value); }
    if dto.assignedUserId.Present? { IntRoundTrip(dto.assignedUserId.value); }
  }

  /** Validating what a client sends for a DTO gives that DTO back exactly when it obeys the rules. */
  lemma ValidateToBody(dto: CreateTaskDto, isDateString: string -> bool)
    ensures Validate(ToBody(dto), isDateString) == if Valid(dto, isDateString) then Some(dto) else None
  {
    ValidBodyToBody(dto, isDateString);
    TransformToBody(dto);
  }

  /**
   * `UpdateTaskDto` keeps every rule of `CreateTaskDto`, so a partial
   * update body that leaves out the title, the deadline or the project id
   * is rejected.
   */
  lemma UpdateNeedsRequiredFields(body: Body, isDateString: string -> bool)
    requires "title" !in body || "deadline" !in body || "projectId" !in body
    ensures Validate(body, isDateString) == None
  {
  }
}
