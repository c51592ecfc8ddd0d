/** The Bulletin entity (php/bulletin.php): four validated private fields, the
    table operations insert/delete/update, and the two static lookups. The
    behaviour is that of the code as written, including where it departs from
    what the names suggest: setMessage stores into `category`, `message` is
    never assigned, update has no guard and getAllBulletins yields one row. */
module Bulletins {
  import opened Php
  import opened Store

  /** A row of the bulletin table: the columns besides the key bulletinId. */
  datatype Row = Row(userId: Option<int>, category: Option<Bytes>, message: Option<Bytes>)

  /** The private fields of a Bulletin, as JsonSerialize reports them. */
  datatype Fields = Fields(bulletinId: Option<int>, userId: Option<int>, category: Option<Bytes>, message: Option<Bytes>)

  const MaxCategoryLength := 32

  /** What every Bulletin satisfies: neither id is 0, a stored category is never
      empty text, and message is never assigned. */
  ghost predicate WellFormed(f: Fields)
  {
    && f.bulletinId != Some(0)
    && f.userId != Some(0)
    && (f.category.Some? ==> !IsEmptyText(f.category.value))
    && f.message.None?
  }

  /** setBulletinId's validation. */
  function CheckBulletinId(v: PhpValue): Result<Option<int>>
  {
    CheckOptionalId(v, "bulletinId invalid")
  }

  /** setUserId's validation: there is no null case. */
  function CheckUserId(v: PhpValue): (r: Result<int>)
    ensures r.Ok? <==> ValidateNonEmptyInt(v).Some?
    ensures r.Ok? ==> r.value != 0 && ValidateInt(v) == Some(r.value)
    ensures r.Err? ==> r.error == Error(InvalidArgument, "User Id Invalid")
  {
    match ValidateNonEmptyInt(v)
    case Some(i) => Ok(i)
    case None => Err(Error(InvalidArgument, "User Id Invalid"))
  }

  /** setCategory's validation of the sanitised text: empty first, then length. */
  function CheckCategory(v: PhpValue, sanitize: Sanitizer): (r: Result<Bytes>)
    ensures var s := sanitize(ToText(v));
      && (r.Ok? <==> !IsEmptyText(s) && |s| <= MaxCategoryLength)
      && (r.Ok? ==> r.value == s)
      && (IsEmptyText(s) ==> r == Err(Error(InvalidArgument, "category invalid")))
      && (!IsEmptyText(s) && |s| > MaxCategoryLength ==> r == Err(Error(Range, "Category name too large")))
  {
    var s := sanitize(ToText(v));
    if IsEmptyText(s) then Err(Error(InvalidArgument, "category invalid"))
    else if |s| > MaxCategoryLength then Err(Error(Range, "Category name too large"))
    else Ok(s)
  }

  /** setMessage's validation of the sanitised text: emptiness only, no length bound. */
  function CheckMessage(v: PhpValue, sanitize: Sanitizer): (r: Result<Bytes>)
    ensures var s := sanitize(ToText(v));
      && (r.Ok? <==> !IsEmptyText(s))
      && (r.Ok? ==> r.value == s)
      && (r.Err? ==> r.error == Error(InvalidArgument, "message invalid"))
  {
    var s := sanitize(ToText(v));
    if IsEmptyText(s) then Err(Error(InvalidArgument, "message invalid")) else Ok(s)
  }

  /** The constructor's catch clauses: InvalidArgumentException and RangeException
      are thrown again with the same message, any other Exception as a plain
      Exception with the same message; an Error is not caught. */
  function Rethrow(e: Error): (r: Error)
    ensures r.message == e.message
    ensures e.kind in {InvalidArgument, Range} ==> r == e
    ensures IsException(e.kind) && e.kind !in {InvalidArgument, Range} ==> r.kind == Generic
    ensures !IsException(e.kind) ==> r == e
  {
    if e.kind in {InvalidArgument, Range} then e
    else if IsException(e.kind) then Error(Generic, e.message)
    else e
  }

  /** new Bulletin(id, userId, category, message): the four setters in order on
      an object whose fields are all null; the first failure ends construction. */
  function Construct(id: PhpValue, userId: PhpValue, category: PhpValue, message: PhpValue,
                     sanitize: Sanitizer): (r: Result<Fields>)
    ensures CheckBulletinId(id).Err? ==> r == Err(CheckBulletinId(id).error)
    ensures CheckBulletinId(id).Ok? && CheckUserId(userId).Err? ==> r == Err(CheckUserId(userId).error)
    ensures CheckBulletinId(id).Ok? && CheckUserId(userId).Ok? && CheckCategory(category, sanitize).Err? ==>
      r == Err(CheckCategory(category, sanitize).error)
    ensures (CheckBulletinId(id).Ok? && CheckUserId(userId).Ok? && CheckCategory(category, sanitize).Ok? &&
             CheckMessage(message, sanitize).Err?) ==> r == Err(CheckMessage(message, sanitize).error)
    ensures r.Ok? ==> WellFormed(r.value)
    ensures r.Ok? ==> r.value == Fields(CheckBulletinId(id).value, Some(CheckUserId(userId).value),
                                        Some(CheckMessage(message, sanitize).value), None)
  {
    match CheckBulletinId(id)
    case Err(e) => Err(Rethrow(e))
    case Ok(bulletinId) =>
      match CheckUserId(userId)
      case Err(e) => Err(Rethrow(e))
      case Ok(u) =>
        match CheckCategory(category, sanitize)
        case Err(e) => Err(Rethrow(e))
        case Ok(c) =>
          match CheckMessage(message, sanitize)
          case Err(e) => Err(Rethrow(e))
          // setMessage overwrites the category that setCategory stored
          case Ok(m) => Ok(Fields(bulletinId, Some(u), Some(m), None))
  }

  /** Construction succeeds exactly when every setter accepts its argument; the
      category it keeps is then the sanitised message, whose length is unbounded. */
  lemma ConstructAcceptance(id: PhpValue, userId: PhpValue, category: PhpValue, message: PhpValue,
                            sanitize: Sanitizer)
    ensures Construct(id, userId, category, message, sanitize).Ok? <==>
      && (id.Null? || ValidateNonEmptyInt(id).Some?)
      && ValidateNonEmptyInt(userId).Some?
      && !IsEmptyText(sanitize(ToText(category))) && |sanitize(ToText(category))| <= MaxCategoryLength
      && !IsEmptyText(sanitize(ToText(message)))
    ensures Construct(id, userId, category, message, sanitize).Err? ==>
      Construct(id, userId, category, message, sanitize).error.kind in {InvalidArgument, Range}
  {
  }

  /** A constructed Bulletin can hold a category longer than setCategory allows:
      a one-character category and a 33-character message give a 33-byte category. */
  lemma ConstructedCategoryMayExceedBound()
    ensures var sanitize: Sanitizer := s => s;
      var long: Bytes := seq(33, _ => 120);
      var r := Construct(Null, Int(1), Str([120]), Str(long), sanitize);
      r.Ok? && r.value.category == Some(long) && |r.value.category.value| > MaxCategoryLength
  {
    NonZeroIntegersAccepted(1);
  }

  class Bulletin {
    var bulletinId: Option<int>
    var userId: Option<int>
    var category: Option<Bytes>
    var message: Option<Bytes>

    /** JsonSerialize: a snapshot of the current field values. */
    function JsonSerialize(): (f: Fields)
      reads this
      ensures f.bulletinId == bulletinId && f.userId == userId
      ensures f.category == category && f.message == message
    {
      Fields(bulletinId, userId, category, message)
    }

    ghost predicate Valid()
      reads this
    {
      WellFormed(JsonSerialize())
    }

    /** The columns insert and update write. */
    function RowOf(): Row
      reads this
    {
      Row(userId, category, message)
    }

    /** The object as allocated, before the constructor body runs: every field null. */
    constructor Blank()
      ensures Valid() && JsonSerialize() == Fields(None, None, None, None)
    {
      bulletinId, userId, category, message := None, None, None, None;
    }

    method SetBulletinId(newBulletinId: PhpValue) returns (o: Outcome)
      requires Valid()
      modifies this`bulletinId
      ensures Valid()
      ensures o == OutcomeOf(CheckBulletinId(newBulletinId))
      ensures bulletinId == if o.Pass? then CheckBulletinId(newBulletinId).value else old(bulletinId)
    {
      if newBulletinId.Null? {
        bulletinId := None;
        return Pass;
      }
      var id := ValidateNonEmptyInt(newBulletinId);
      if id.None? {
        return Fail(Error(InvalidArgument, "bulletinId invalid"));
      }
      bulletinId := Some(id.value);
      o := Pass;
    }

    method SetUserId(newUserId: PhpValue) returns (o: Outcome)
      requires Valid()
      modifies this`userId
      ensures Valid()
      ensures o == OutcomeOf(CheckUserId(newUserId))
      ensures userId == if o.Pass? then Some(CheckUserId(newUserId).value) else old(userId)
    {
      var id := ValidateNonEmptyInt(newUserId);
      if id.None? {
        return Fail(Error(InvalidArgument, "User Id Invalid"));
      }
      userId := Some(id.value);
      o := Pass;
    }

    method SetCategory(newCategory: PhpValue, sanitize: Sanitizer) returns (o: Outcome)
      requires Valid()
      modifies this`category
      ensures Valid()
      ensures o == OutcomeOf(CheckCategory(newCategory, sanitize))
      ensures category == if o.Pass? then Some(CheckCategory(newCategory, sanitize).value) else old(category)
    {
      var s := sanitize(ToText(newCategory));
      if IsEmptyText(s) {
        return Fail(Error(InvalidArgument, "category invalid"));
      }
      if |s| > MaxCategoryLength {
        return Fail(Error(Range, "Category name too large"));
      }
      category := Some(s);
      o := Pass;
    }

    /** Validates a message and stores it into `category`; `message` stays as it was. */
    method SetMessage(newMessage: PhpValue, sanitize: Sanitizer) returns (o: Outcome)
      requires Valid()
      modifies this`category
      ensures Valid()
      ensures o == OutcomeOf(CheckMessage(newMessage, sanitize))
      ensures category == if o.Pass? then Some(CheckMessage(newMessage, sanitize).value) else old(category)
    {
      var s := sanitize(ToText(newMessage));
      if IsEmptyText(s) {
        return Fail(Error(InvalidArgument, "message invalid"));
      }
      category := Some(s);
      o := Pass;
    }

    /** new Bulletin(...): allocate, run the setters in order, and re-raise the
      first failure through the catch clauses. */
    static method New(newBulletinId: PhpValue, newUserId: PhpValue, newCategory: PhpValue,
                      newMessage: PhpValue, sanitize: Sanitizer) returns (r: Result<Bulletin>)
      ensures r.Err? ==> Construct(newBulletinId, newUserId, newCategory, newMessage, sanitize) == Err(r.error)
      ensures r.Ok? ==> (fresh(r.value) && r.value.Valid() &&
        Construct(newBulletinId, newUserId, newCategory, newMessage, sanitize) == Ok(r.value.JsonSerialize()))
    {
      ghost var c := Construct(newBulletinId, newUserId, newCategory, newMessage, sanitize);
      var b := new Bulletin.Blank();
      var o := b.SetBulletinId(newBulletinId);
      if o.Fail? {
        assert c == Err(Rethrow(o.error));
        return Err(Rethrow(o.error));
      }
      o := b.SetUserId(newUserId);
      if o.Fail? {
        assert c == Err(Rethrow(o.error));
        return Err(Rethrow(o.error));
      }
      o := b.SetCategory(newCategory, sanitize);
      if o.Fail? {
        assert c == Err(Rethrow(o.error));
        return Err(Rethrow(o.error));
      }
      o := b.SetMessage(newMessage, sanitize);
      if o.Fail? {
        assert c == Err(Rethrow(o.error));
        return Err(Rethrow(o.error));
      }
      assert c == Ok(b.JsonSerialize());
      r := Ok(b);
    }

    /** INSERT INTO bulletin: refused for a bulletin that already has an id;
      otherwise one new row, whose generated key becomes bulletinId. */
    method Insert(db: Table<Row>) returns (o: Outcome)
      requires Valid() && db.Valid()
      modifies this`bulletinId, db
      ensures Valid() && db.Valid()
      ensures old(bulletinId).Some? ==>
        o == Fail(Error(Pdo, "existing bulletin")) && unchanged(db) && bulletinId == old(bulletinId)
      ensures old(bulletinId).None? ==>
        && o == Pass
        && old(db.nextId) !in old(db.rows)
        && db.rows == old(db.rows)[old(db.nextId) := RowOf()]
        && bulletinId == Some(old(db.nextId))
        && db.nextId == old(db.nextId) + 1 && db.lastInsertId == old(db.nextId)
      ensures RowOf().message.None?
    {
      if bulletinId.Some? {
        return Fail(Error(Pdo, "existing bulletin"));
      }
      db.InsertRow(RowOf());
      bulletinId := Some(db.lastInsertId);
      o := Pass;
    }

    /** DELETE FROM bulletin WHERE bulletinId = :bulletinId, refused for a null id.
      bulletinId is left as it is. */
    method Delete(db: Table<Row>) returns (o: Outcome)
      requires db.Valid()
      modifies db
      ensures db.Valid()
      ensures bulletinId.None? ==>
        o == Fail(Error(Pdo, "unable to delete a bulletin that does not exist")) && unchanged(db)
      ensures bulletinId.Some? ==>
        o == Pass && db.rows == old(db.rows) - {bulletinId.value}
        && db.nextId == old(db.nextId) && db.lastInsertId == old(db.lastInsertId)
    {
      if bulletinId.None? {
        return Fail(Error(Pdo, "unable to delete a bulletin that does not exist"));
      }
      db.DeleteByKey(bulletinId);
      o := Pass;
    }

    /** UPDATE bulletin ... WHERE bulletinId = :bulletinId, with no guard: a null
      or unknown id changes nothing. */
    method Update(db: Table<Row>)
      requires Valid() && db.Valid()
      modifies db
      ensures db.Valid()
      ensures RowOf().message.None?
      ensures db.rows == if bulletinId.Some? && bulletinId.value in old(db.rows)
                         then old(db.rows)[bulletinId.value := RowOf()] else old(db.rows)
      ensures db.nextId == old(db.nextId) && db.lastInsertId == old(db.lastInsertId)
    {
      db.UpdateByKey(bulletinId, RowOf());
    }
  }

  /** The value PDO binds for a query parameter: null binds SQL NULL, which
      equals nothing; anything else binds its text. */
  function BoundText(v: PhpValue): (r: Option<Bytes>)
    ensures r.None? <==> v.Null?
    ensures r.Some? ==> r.value == ToText(v)
    ensures v == Bool(true) ==> r == Some([Zero + 1])
    ensures v.Int? ==> r == Some(Decimal(v.i))
  {
    if v.Null? then None else Some(ToText(v))
  }

  /** `WHERE category = :category`. */
  function HasCategory(text: Option<Bytes>): Row -> bool
  {
    (row: Row) => text.Some? && row.category == text
  }

  /** The lookup without a WHERE clause: every row qualifies. */
  function AnyRow(): Row -> bool
  {
    (row: Row) => true
  }

  function FetchedInt(c: Option<int>): PhpValue
  {
    if c.Some? then Int(c.value) else Null
  }

  function FetchedText(c: Option<Bytes>): PhpValue
  {
    if c.Some? then Str(c.value) else Null
  }

  /** new Bulletin(...) over a fetched row; a failure of the constructor
      surfaces as a PDOException with the same message. */
  function LoadRow(key: int, row: Row, sanitize: Sanitizer): (r: Result<Fields>)
    ensures var c := Construct(Int(key), FetchedInt(row.userId), FetchedText(row.category),
                               FetchedText(row.message), sanitize);
      && (r.Ok? <==> c.Ok?)
      && (r.Ok? ==> r == c)
      && (r.Err? ==> r.error == Error(Pdo, c.error.message))
    ensures r.Err? ==> r.error.kind == Pdo
    ensures r.Ok? ==> WellFormed(r.value) && r.value.category == Some(sanitize(ToText(FetchedText(row.message))))
  {
    match Construct(Int(key), FetchedInt(row.userId), FetchedText(row.category), FetchedText(row.message), sanitize)
    case Ok(f) => Ok(f)
    case Err(e) => Err(Error(Pdo, e.message))
  }

  /** The messages of the setters that can reject a fetched row. */
  const LoadFailures: set<string> := {"User Id Invalid", "category invalid", "Category name too large", "message invalid"}

  /** The condition on a fetched row under which the four setters accept its
      columns: a non-zero userId within PHP's integer range, a category that is
      not empty text and has at most 32 bytes, and a message that is not empty
      text, each after sanitising. */
  predicate RowLoads(row: Row, sanitize: Sanitizer)
  {
    && row.userId.Some? && row.userId.value != 0 && IntMin <= row.userId.value <= IntMax
    && (var c := sanitize(ToText(FetchedText(row.category)));
        !IsEmptyText(c) && |c| <= MaxCategoryLength)
    && !IsEmptyText(sanitize(ToText(FetchedText(row.message))))
  }

  /** A row with a key in PHP's integer range loads exactly when RowLoads holds;
      the Bulletin keeps the row's key and userId, and its category is the
      sanitised message. A failure is the first failing setter's message,
      thrown as a PDOException. */
  lemma LoadRowAcceptance(key: int, row: Row, sanitize: Sanitizer)
    requires 1 <= key <= IntMax
    ensures LoadRow(key, row, sanitize).Ok? <==> RowLoads(row, sanitize)
    ensures LoadRow(key, row, sanitize).Ok? ==>
      LoadRow(key, row, sanitize).value
        == Fields(Some(key), row.userId, Some(sanitize(ToText(FetchedText(row.message)))), None)
    ensures LoadRow(key, row, sanitize).Err? ==>
      LoadRow(key, row, sanitize).error.kind == Pdo &&
      LoadRow(key, row, sanitize).error.message in LoadFailures
  {
    NonZeroIntegersAccepted(key);
    if row.userId.Some? {
      DecimalParses(row.userId.value);
    }
  }

  /** getBulletinByCategory: the argument false is refused before any query;
      otherwise the first row with that category, if any, as a Bulletin. */
  function GetBulletinByCategory(db: Table<Row>, category: PhpValue, sanitize: Sanitizer): (r: Result<Option<Fields>>)
    reads db
    requires db.Valid()
    ensures category == Bool(false) ==> r == Err(Error(Pdo, ""))
    ensures category != Bool(false) ==>
      (r == Ok(None) <==> forall k :: k in db.rows ==> !HasCategory(BoundText(category))(db.rows[k]))
    ensures r.Err? ==> r.error.kind == Pdo
    ensures r.Ok? && r.value.Some? ==> WellFormed(r.value.value)
  {
    if category == Bool(false) then Err(Error(Pdo, ""))
    else
      match db.FirstKeyWhere(HasCategory(BoundText(category)))
      case None => Ok(None)
      case Some(k) =>
        match LoadRow(k, db.rows[k], sanitize)
        case Ok(f) => Ok(Some(f))
        case Err(e) => Err(e)
  }

  /** getAllBulletins: at most one Bulletin, built from the first row. */
  function GetAllBulletins(db: Table<Row>, sanitize: Sanitizer): (r: Result<Option<Fields>>)
    reads db
    requires db.Valid()
    ensures r == Ok(None) <==> db.rows == map[]
    ensures r.Err? ==> r.error.kind == Pdo
    ensures r.Ok? && r.value.Some? ==> WellFormed(r.value.value)
  {
    match db.FirstKeyWhere(AnyRow())
    case None => Ok(None)
    case Some(k) =>
      match LoadRow(k, db.rows[k], sanitize)
      case Ok(f) => Ok(Some(f))
      case Err(e) => Err(e)
  }

  /** The Bulletin getBulletinByCategory returns comes from the row with the
      smallest key among those with the requested category, and carries that key. */
  lemma LoadedByCategoryIsFirstMatch(db: Table<Row>, category: PhpValue, sanitize: Sanitizer)
    requires db.Valid() && db.nextId <= IntMax + 1
    ensures var r := GetBulletinByCategory(db, category, sanitize);
      r.Ok? && r.value.Some? ==>
      var f := r.value.value;
      && f.bulletinId.Some?
      && var k := f.bulletinId.value;
      && k in db.rows && HasCategory(BoundText(category))(db.rows[k])
      && (forall j :: j in db.rows && j < k ==> !HasCategory(BoundText(category))(db.rows[j]))
      && f.category == Some(sanitize(ToText(FetchedText(db.rows[k].message))))
  {
    if category != Bool(false) {
      var first := db.FirstKeyWhere(HasCategory(BoundText(category)));
      if first.Some? {
        LoadRowAcceptance(first.value, db.rows[first.value], sanitize);
      }
    }
  }

  /** A lookup that passes on the outcome of loading one row (key in PHP's
      integer range) succeeds exactly when that row loads, with its Bulletin. */
  lemma LookupLoadsRow(r: Result<Option<Fields>>, key: int, row: Row, sanitize: Sanitizer)
    requires 1 <= key <= IntMax
    requires var l := LoadRow(key, row, sanitize); r == if l.Ok? then Ok(Some(l.value)) else Err(l.error)
    ensures r.Ok? <==> RowLoads(row, sanitize)
    ensures r.Ok? ==> r == Ok(Some(Fields(Some(key), row.userId, Some(sanitize(ToText(FetchedText(row.message)))), None)))
    ensures r.Err? ==> r.error.kind == Pdo && r.error.message in LoadFailures
  {
    LoadRowAcceptance(key, row, sanitize);
  }

  /** The step of getBulletinByCategory after the query: the first match is loaded. */
  lemma ByCategoryLoadsFirstMatch(db: Table<Row>, category: PhpValue, sanitize: Sanitizer, k: int)
    requires db.Valid()
    requires category != Bool(false) && k in db.rows && HasCategory(BoundText(category))(db.rows[k])
    requires forall j :: j in db.rows && j < k ==> !HasCategory(BoundText(category))(db.rows[j])
    ensures var l := LoadRow(k, db.rows[k], sanitize);
      GetBulletinByCategory(db, category, sanitize) == if l.Ok? then Ok(Some(l.value)) else Err(l.error)
  {
    db.FirstKeyWhereIs(HasCategory(BoundText(category)), k);
  }

  /** The step of getAllBulletins after the query: the row with the smallest key is loaded. */
  lemma AllBulletinsLoadsFirstRow(db: Table<Row>, sanitize: Sanitizer, k: int)
    requires db.Valid()
    requires k in db.rows && forall j :: j in db.rows ==> k <= j
    ensures var l := LoadRow(k, db.rows[k], sanitize);
      GetAllBulletins(db, sanitize) == if l.Ok? then Ok(Some(l.value)) else Err(l.error)
  {
    db.FirstKeyWhereIs(AnyRow(), k);
  }

  /** getBulletinByCategory returns the Bulletin built from the first row with
      the requested category whenever that row loads, and fails only when it
      does not, with the message of the setter that rejected it. */
  lemma ByCategoryReturnsFirstMatch(db: Table<Row>, category: PhpValue, sanitize: Sanitizer, k: int)
    requires db.Valid() && db.nextId <= IntMax + 1
    requires category != Bool(false) && k in db.rows && HasCategory(BoundText(category))(db.rows[k])
    requires forall j :: j in db.rows && j < k ==> !HasCategory(BoundText(category))(db.rows[j])
    ensures var r := GetBulletinByCategory(db, category, sanitize);
      var row := db.rows[k];
      && (r.Ok? <==> RowLoads(row, sanitize))
      && (r.Ok? ==> r == Ok(Some(Fields(Some(k), row.userId, Some(sanitize(ToText(FetchedText(row.message)))), None))))
      && (r.Err? ==> r.error.kind == Pdo && r.error.message in LoadFailures)
      && (var l := LoadRow(k, row, sanitize); r == if l.Ok? then Ok(Some(l.value)) else Err(l.error))
  {
    ByCategoryLoadsFirstMatch(db, category, sanitize, k);
    LookupLoadsRow(GetBulletinByCategory(db, category, sanitize), k, db.rows[k], sanitize);
  }

  /** getAllBulletins returns the Bulletin built from the row with the smallest
      key whenever that row loads, and fails only when it does not, with the
      message of the setter that rejected it. */
  lemma AllBulletinsReturnsFirstRow(db: Table<Row>, sanitize: Sanitizer, k: int)
    requires db.Valid() && db.nextId <= IntMax + 1
    requires k in db.rows && forall j :: j in db.rows ==> k <= j
    ensures var r := GetAllBulletins(db, sanitize);
      var row := db.rows[k];
      && (r.Ok? <==> RowLoads(row, sanitize))
      && (r.Ok? ==> r == Ok(Some(Fields(Some(k), row.userId, Some(sanitize(ToText(FetchedText(row.message)))), None))))
      && (r.Err? ==> r.error.kind == Pdo && r.error.message in LoadFailures)
      && (var l := LoadRow(k, row, sanitize); r == if l.Ok? then Ok(Some(l.value)) else Err(l.error))
  {
    AllBulletinsLoadsFirstRow(db, sanitize, k);
    LookupLoadsRow(GetAllBulletins(db, sanitize), k, db.rows[k], sanitize);
  }

  /** The Bulletin getAllBulletins returns comes from the row with the smallest key. */
  lemma AllBulletinsIsFirstRow(db: Table<Row>, sanitize: Sanitizer)
    requires db.Valid() && db.nextId <= IntMax + 1
    ensures var r := GetAllBulletins(db, sanitize);
      r.Ok? && r.value.Some? ==>
      var f := r.value.value;
      && f.bulletinId.Some?
      && f.bulletinId.value in db.rows
      && forall j :: j in db.rows ==> f.bulletinId.value <= j
  {
    var first := db.FirstKeyWhere(AnyRow());
    if first.Some? {
      LoadRowAcceptance(first.value, db.rows[first.value], sanitize);
    }
  }

  /** Rows written through Bulletin have a NULL message, and constructing a
      Bulletin from such a row fails in setMessage whenever the sanitiser maps
      the empty text to empty text: neither lookup ever returns a Bulletin. */
  lemma NullMessageRowsNeverLoad(db: Table<Row>, category: PhpValue, sanitize: Sanitizer)
    requires db.Valid()
    requires IsEmptyText(sanitize([]))
    requires forall k :: k in db.rows ==> db.rows[k].message.None?
    ensures !(GetBulletinByCategory(db, category, sanitize).Ok? && GetBulletinByCategory(db, category, sanitize).value.Some?)
    ensures !(GetAllBulletins(db, sanitize).Ok? && GetAllBulletins(db, sanitize).value.Some?)
  {
  }

  /** A bulletin's life: construct, insert, delete, delete again. The second
      delete passes the null guard, since delete never clears bulletinId, and
      removes nothing; the table ends as it began. */
  method InsertThenDeleteTwice(db: Table<Row>) returns (inserted: Outcome, first: Outcome, second: Outcome)
    requires db.Valid()
    modifies db
    ensures db.Valid()
    ensures inserted == Pass && first == Pass && second == Pass
    ensures db.rows == old(db.rows)
  {
    var sanitize: Sanitizer := s => s;
    var sports: Bytes := [115, 112, 111, 114, 116, 115];
    var goTeam: Bytes := [103, 111, 32, 116, 101, 97, 109];
    NonZeroIntegersAccepted(7);
    var r := Bulletin.New(Null, Int(7), Str(sports), Str(goTeam), sanitize);
    var b := r.value;
    assert b.category == Some(goTeam);
    inserted := b.Insert(db);
    first := b.Delete(db);
    second := b.Delete(db);
  }
}
