/** The accessLevel entity (php/accessLevel.php): a three-valued tag with a
    description, and insert/delete/update on its own table, none of them guarded.
    As written, the id mutator is named setUserId, setDescription validates
    without storing, and insert does not record the generated key. */
module AccessLevels {
  import opened Php
  import opened Store

  /** The enumeration's constants. */
  datatype Tag = Viewer | Admin | PowerUser

  /** The class constant __default. */
  const DefaultTag: Tag := Viewer

  const MaxDescriptionLength := 32

  function TagValue(t: Tag): int
  {
    match t
    case Viewer => 1
    case Admin => 2
    case PowerUser => 3
  }

  /** The constant an integer names, if it names one. */
  function TagOf(v: int): (r: Option<Tag>)
    ensures r.Some? <==> 1 <= v <= 3
    ensures forall t :: r == Some(t) <==> TagValue(t) == v
  {
    if v == 1 then Some(Viewer)
    else if v == 2 then Some(Admin)
    else if v == 3 then Some(PowerUser)
    else None
  }

  /** A row of the accessLevel table: the column besides the key accessLevelId. */
  datatype Row = Row(description: Option<Bytes>)

  /** The private fields of an accessLevel, as JsonSerialize reports them. */
  datatype Fields = Fields(accessLevelId: Option<int>, description: Option<Bytes>)

  /** The id mutator's validation: any non-zero integer is accepted, whether
      or not it names a constant. */
  function CheckAccessLevelId(v: PhpValue): Result<Option<int>>
  {
    CheckOptionalId(v, "accessLevelId invalid")
  }

  /** setDescription's validation of the sanitised text: empty first, then length. */
  function CheckDescription(v: PhpValue, sanitize: Sanitizer): (r: Outcome)
    ensures var s := sanitize(ToText(v));
      && (r.Pass? <==> !IsEmptyText(s) && |s| <= MaxDescriptionLength)
      && (IsEmptyText(s) ==> r == Fail(Error(InvalidArgument, "description is invalid")))
      && (!IsEmptyText(s) && |s| > MaxDescriptionLength ==> r == Fail(Error(Range, "description too large")))
  {
    var s := sanitize(ToText(v));
    if IsEmptyText(s) then Fail(Error(InvalidArgument, "description is invalid"))
    else if |s| > MaxDescriptionLength then Fail(Error(Range, "description too large"))
    else Pass
  }

  /** The constructor's catch clauses, given the fields set before the throw:
      InvalidArgumentException and RangeException are thrown again with the same
      message; any other Exception is swallowed (its rethrow is commented out), so
      construction completes with the fields as they are; an Error is not caught. */
  function Caught(e: Error, partial: Fields): (r: Result<Fields>)
    ensures e.kind in {InvalidArgument, Range} ==> r == Err(e)
    ensures IsException(e.kind) && e.kind !in {InvalidArgument, Range} ==> r == Ok(partial)
    ensures !IsException(e.kind) ==> r == Err(e)
  {
    if e.kind in {InvalidArgument, Range} then Err(e)
    else if IsException(e.kind) then Ok(partial)
    else Err(e)
  }

  /** What PHP throws for the constructor's call to setAccessLevelId, which the class does not define. */
  const UndefinedSetter := Error(UndefinedMethod, "Call to undefined method accessLevel::setAccessLevelId()")

  /** new accessLevel(id, description) as written: the first statement calls an
      undefined method, and the Error it throws escapes every catch clause. */
  function ConstructAsWritten(id: PhpValue, description: PhpValue, sanitize: Sanitizer): (r: Result<Fields>)
    ensures r == Err(UndefinedSetter)
  {
    Caught(UndefinedSetter, Fields(None, None))
  }

  /** new accessLevel(id, description) calling the id mutator under its real name
      (setUserId), then setDescription, which stores nothing. */
  function Construct(id: PhpValue, description: PhpValue, sanitize: Sanitizer): (r: Result<Fields>)
    ensures r.Ok? <==> CheckAccessLevelId(id).Ok? && CheckDescription(description, sanitize).Pass?
    ensures CheckAccessLevelId(id).Err? ==> r == Err(CheckAccessLevelId(id).error)
    ensures CheckAccessLevelId(id).Ok? && CheckDescription(description, sanitize).Fail? ==>
      r == Err(CheckDescription(description, sanitize).error)
    ensures r.Ok? ==> r.value == Fields(CheckAccessLevelId(id).value, None)
  {
    match CheckAccessLevelId(id)
    case Err(e) => Caught(e, Fields(None, None))
    case Ok(i) =>
      match CheckDescription(description, sanitize)
      case Fail(e) => Caught(e, Fields(i, None))
      case Pass => Ok(Fields(i, None))
  }

  /** The constructor as written fails on inputs the corrected one accepts: a
      null id and the description "x" under a sanitiser that keeps its input. */
  lemma AsWrittenRejectsValidInput()
    ensures var sanitize: Sanitizer := s => s;
      && ConstructAsWritten(Null, Str([120]), sanitize).Err?
      && Construct(Null, Str([120]), sanitize) == Ok(Fields(None, None))
  {
  }

  /** The id mutator accepts every non-zero PHP integer, including ones that
      name none of the three constants. */
  lemma AnyNonZeroIdAccepted(i: int)
    requires IntMin <= i <= IntMax && i != 0
    ensures CheckAccessLevelId(Int(i)) == Ok(Some(i))
    ensures CheckAccessLevelId(Str(Decimal(i))) == Ok(Some(i))
    ensures TagOf(i).None? <==> i !in {1, 2, 3}
  {
    NonZeroIntegersAccepted(i);
  }

  class AccessLevel {
    var accessLevelId: Option<int>
    var description: Option<Bytes>

    /** JsonSerialize: a snapshot of the current field values. */
    function JsonSerialize(): (f: Fields)
      reads this
      ensures f.accessLevelId == accessLevelId && f.description == description
    {
      Fields(accessLevelId, description)
    }

    /** What every accessLevel satisfies: the id is never 0, and description is
      never assigned. */
    ghost predicate Valid()
      reads this
    {
      accessLevelId != Some(0) && description.None?
    }

    /** The object as allocated, before the constructor body runs: every field null. */
    constructor Blank()
      ensures Valid() && JsonSerialize() == Fields(None, None)
    {
      accessLevelId, description := None, None;
    }

    /** The id mutator, named setUserId in the class. */
    method SetUserId(newAccessLevelId: PhpValue) returns (o: Outcome)
      requires Valid()
      modifies this`accessLevelId
      ensures Valid()
      ensures o == OutcomeOf(CheckAccessLevelId(newAccessLevelId))
      ensures accessLevelId == if o.Pass? then CheckAccessLevelId(newAccessLevelId).value else old(accessLevelId)
    {
      if newAccessLevelId.Null? {
        accessLevelId := None;
        return Pass;
      }
      var id := ValidateNonEmptyInt(newAccessLevelId);
      if id.None? {
        return Fail(Error(InvalidArgument, "accessLevelId invalid"));
      }
      accessLevelId := Some(id.value);
      o := Pass;
    }

    /** Validates a description and stores nothing. */
    method SetDescription(newDescription: PhpValue, sanitize: Sanitizer) returns (o: Outcome)
      ensures o.Pass? <==> !IsEmptyText(sanitize(ToText(newDescription)))
                           && |sanitize(ToText(newDescription))| <= MaxDescriptionLength
      ensures o == CheckDescription(newDescription, sanitize)
    {
      var s := sanitize(ToText(newDescription));
      if IsEmptyText(s) {
        return Fail(Error(InvalidArgument, "description is invalid"));
      }
      if |s| > MaxDescriptionLength {
        return Fail(Error(Range, "description too large"));
      }
      o := Pass;
    }

    /** new accessLevel(...), with the id mutator called under its real name. */
    static method New(newAccessLevelId: PhpValue, newDescription: PhpValue, sanitize: Sanitizer)
      returns (r: Result<AccessLevel>)
      ensures r.Err? ==> Construct(newAccessLevelId, newDescription, sanitize) == Err(r.error)
      ensures r.Ok? ==> (fresh(r.value) && r.value.Valid() &&
        Construct(newAccessLevelId, newDescription, sanitize) == Ok(r.value.JsonSerialize()))
    {
      var a := new AccessLevel.Blank();
      var o := a.SetUserId(newAccessLevelId);
      if o.Fail? {
        return Err(o.error);
      }
      o := a.SetDescription(newDescription, sanitize);
      if o.Fail? {
        return Err(o.error);
      }
      r := Ok(a);
    }

    /** INSERT INTO accessLevel(description), with no guard; accessLevelId is not
      updated with the generated key. */
    method Insert(db: Table<Row>)
      requires Valid() && db.Valid()
      modifies db
      ensures db.Valid()
      ensures old(db.nextId) !in old(db.rows) && db.rows == old(db.rows)[old(db.nextId) := Row(description)]
      ensures db.nextId == old(db.nextId) + 1 && db.lastInsertId == old(db.nextId)
      ensures description.None?
    {
      db.InsertRow(Row(description));
    }

    /** DELETE FROM accessLevel WHERE accessLevelId = :accessLevelId, with no guard. */
    method Delete(db: Table<Row>)
      requires db.Valid()
      modifies db
      ensures db.Valid()
      ensures db.rows == if accessLevelId.Some? then old(db.rows) - {accessLevelId.value} else old(db.rows)
      ensures db.nextId == old(db.nextId) && db.lastInsertId == old(db.lastInsertId)
    {
      db.DeleteByKey(accessLevelId);
    }

    /** UPDATE accessLevel SET description WHERE accessLevelId = :accessLevelId. */
    method Update(db: Table<Row>)
      requires db.Valid()
      modifies db
      ensures db.Valid()
      ensures db.rows == if accessLevelId.Some? && accessLevelId.value in old(db.rows)
                         then old(db.rows)[accessLevelId.value := Row(description)] else old(db.rows)
      ensures db.nextId == old(db.nextId) && db.lastInsertId == old(db.lastInsertId)
    {
      db.UpdateByKey(accessLevelId, Row(description));
    }
  }
}
