/** The `/api/schools` route. `POST` trims the six text fields, checks that
    they and the image are present, stores the image under a random name, then
    inserts a row; `GET` lists every row, newest first. The file system and
    the `schools` table are an abstract `Store`; every I/O step that can throw
    takes the thrown value, if any, as a parameter. */
module SchoolsRoute {
  import opened Common
  import opened JsString
  import opened ImageStore

  /** What `formData.get(key)` can return besides `null`. */
  datatype FormValue = TextPart(text: string) | FilePart(file: File)

  /** An incoming request: its parsed multipart form (the first value of each
      key the handler reads), or
      the value `req.formData()` threw. */
  datatype Request = Parsed(form: map<FieldName, FormValue>) | Unparseable(error: Thrown)

  /** One row of `schools(id, name, address, city, state, contact, image, email_id)`. */
  datatype Row = Row(id: nat, name: string, address: string, city: string, state: string,
                     contact: string, image: string, email_id: string)

  datatype Body = SuccessBody | MessageBody(message: string) | RowsBody(rows: seq<Row>)

  datatype Response = Response(status: int, body: Body)

  /** The image directory (whether it exists, the files in it by name) and the
      `schools` table with its next auto-increment id. */
  datatype Store = Store(dirReady: bool, files: map<string, seq<byte>>, rows: seq<Row>, nextId: nat)

  /** The value thrown by each I/O step of `POST`, if it throws. */
  datatype Faults = Faults(mkdir: Option<Thrown>, write: Option<Thrown>, insert: Option<Thrown>)

  const NoFaults := Faults(None, None, None)

  /** The six text fields after trimming. */
  datatype Fields = Fields(name: string, address: string, city: string, state: string,
                           contact: string, email_id: string)

  const MissingFieldsMessage := "Missing required fields"

  /** What V8 throws for `image.name.split` when `image` is a string: a string
      has no `name`. */
  const SplitOfUndefinedMessage := "Cannot read properties of undefined (reading 'split')"

  /** `String(formData.get(key) || '')`; a file part converts to `[object File]`. */
  function FieldText(form: map<FieldName, FormValue>, key: FieldName): string
  {
    if key !in form then ""
    else match form[key]
      case TextPart(t) => t
      case FilePart(_) => "[object File]"
  }

  /** The six text fields, each trimmed. */
  function TrimmedFields(form: map<FieldName, FormValue>): (f: Fields)
    ensures Unpadded(f.name) && Unpadded(f.address) && Unpadded(f.city)
    ensures Unpadded(f.state) && Unpadded(f.contact) && Unpadded(f.email_id)
  {
    Fields(Trim(FieldText(form, NameField)), Trim(FieldText(form, AddressField)),
           Trim(FieldText(form, CityField)), Trim(FieldText(form, StateField)),
           Trim(FieldText(form, ContactField)), Trim(FieldText(form, EmailIdField)))
  }

  /** `!!formData.get('image')`: any file part, or a non-empty text part. */
  predicate ImagePresent(form: map<FieldName, FormValue>)
  {
    ImageField in form && form[ImageField] != TextPart("")
  }

  /** The server's whole validation: no trimmed field is empty and the image is there. */
  predicate Present(form: map<FieldName, FormValue>)
  {
    var f := TrimmedFields(form);
    f.name != [] && f.address != [] && f.city != [] && f.state != []
    && f.contact != [] && f.email_id != [] && ImagePresent(form)
  }

  /** The row the insert adds. */
  function NewRow(id: nat, f: Fields, filename: string): Row
  {
    Row(id, f.name, f.address, f.city, f.state, f.contact, ReferencePath(filename), f.email_id)
  }

  function ServerError(err: Thrown): Response
  {
    Response(500, MessageBody(MessageOf(err)))
  }

  /** The outcome of lines 27-42 of the handler: a response already decided,
      or the trimmed fields and the uploaded file to persist. */
  datatype Admission = Rejected(response: Response) | Admitted(fields: Fields, file: File)

  /** Parsing, trimming and the presence check; a text part in place of the
      image throws when its `name` is split. None of it touches the store. */
  function Admit(req: Request): (a: Admission)
    ensures a.Admitted? ==>
              req.Parsed? && Present(req.form) &&
              req.form[ImageField] == FilePart(a.file) && a.fields == TrimmedFields(req.form)
  {
    match req
    case Unparseable(e) => Rejected(ServerError(e))
    case Parsed(form) =>
      if !Present(form) then Rejected(Response(400, MessageBody(MissingFieldsMessage)))
      else match form[ImageField]
        case TextPart(_) => Rejected(Response(500, MessageBody(SplitOfUndefinedMessage)))
        case FilePart(file) => Admitted(TrimmedFields(form), file)
  }

  /** Lines 45-55: make the directory, write the file, insert the row, each
      step running only if the one before did not throw. */
  function Persist(s: Store, fields: Fields, content: seq<byte>, filename: string, faults: Faults): (Store, Response)
  {
    if faults.mkdir.Some? then (s, ServerError(faults.mkdir.value))
    else
      var s1 := s.(dirReady := true);
      if faults.write.Some? then (s1, ServerError(faults.write.value))
      else
        var s2 := s1.(files := s1.files[filename := content]);
        if faults.insert.Some? then (s2, ServerError(faults.insert.value))
        else
          (s2.(rows := s2.rows + [NewRow(s2.nextId, fields, filename)], nextId := s2.nextId + 1),
           Response(201, SuccessBody))
  }

  /** Everything `POST` does, as the store after it and the response. */
  function PostStep(s: Store, req: Request, random: seq<byte>, faults: Faults): (Store, Response)
    requires |random| == RandomLength
  {
    match Admit(req)
    case Rejected(resp) => (s, resp)
    case Admitted(fields, file) =>
      Persist(s, fields, file.content, StoredFilename(random, file.name), faults)
  }

  /** The rows in reverse table order. */
  function Listing(rows: seq<Row>): (r: seq<Row>)
    ensures |r| == |rows|
    ensures forall i :: 0 <= i < |r| ==> r[i] == rows[|rows| - 1 - i]
  {
    if rows == [] then [] else [rows[|rows| - 1]] + Listing(rows[..|rows| - 1])
  }

  /** Everything `GET` does: the listing, or the query's thrown value as a 500. */
  function GetStep(s: Store, fault: Option<Thrown>): Response
  {
    match fault
    case Some(e) => ServerError(e)
    case None => Response(200, RowsBody(Listing(s.rows)))
  }

  predicate AscendingIds(rows: seq<Row>)
  {
    forall i, j :: 0 <= i < j < |rows| ==> rows[i].id < rows[j].id
  }

  predicate DescendingIds(rows: seq<Row>)
  {
    forall i, j :: 0 <= i < j < |rows| ==> rows[i].id > rows[j].id
  }

  /** The row's `image` names a file in the image directory. */
  predicate ImageStored(s: Store, image: string)
  {
    |PublicPrefix| <= |image| && image[..|PublicPrefix|] == PublicPrefix
    && image[|PublicPrefix|..] in s.files
  }

  /** What every inserted row looks like: six non-empty trimmed text fields. */
  predicate RowNormal(r: Row)
  {
    r.name != [] && r.address != [] && r.city != [] && r.state != []
    && r.contact != [] && r.email_id != []
    && Unpadded(r.name) && Unpadded(r.address) && Unpadded(r.city)
    && Unpadded(r.state) && Unpadded(r.contact) && Unpadded(r.email_id)
  }

  /** The store's invariant: ids increase with insertion and stay below the
      next id; every row's image was written before the row (and is never
      removed); every row passed the presence check; files exist only once
      the directory does. */
  predicate Valid(s: Store)
  {
    && AscendingIds(s.rows)
    && (forall i :: 0 <= i < |s.rows| ==> s.rows[i].id < s.nextId)
    && (forall i :: 0 <= i < |s.rows| ==> ImageStored(s, s.rows[i].image) && RowNormal(s.rows[i]))
    && (s.files != map[] ==> s.dirReady)
  }

  /** The empty store a fresh database and directory start as (ids from 1). */
  const Empty := Store(false, map[], [], 1)

  lemma EmptyValid()
    ensures Valid(Empty)
  {
  }

  // ---------------------------------------------------------------------------
  // What POST promises

  /** The storage steps answer 201 or 500, never 400. */
  lemma PersistStatuses(s: Store, fields: Fields, content: seq<byte>, filename: string, faults: Faults)
    ensures Persist(s, fields, content, filename, faults).1.status in {201, 500}
  {
  }

  /** `POST` answers 201, 400 or 500 only. */
  lemma PostStatuses(s: Store, req: Request, random: seq<byte>, faults: Faults)
    requires |random| == RandomLength
    ensures PostStep(s, req, random, faults).1.status in {201, 400, 500}
  {
    var a := Admit(req);
    if a.Admitted? {
      PersistStatuses(s, a.fields, a.file.content, StoredFilename(random, a.file.name), faults);
    }
  }

  /** A 400 comes exactly from a failed presence check, says "Missing required
      fields", and neither writes a file nor inserts a row. */
  lemma PostRejectsMissing(s: Store, form: map<FieldName, FormValue>, random: seq<byte>, faults: Faults)
    requires |random| == RandomLength
    ensures PostStep(s, Parsed(form), random, faults).1.status == 400 <==> !Present(form)
    ensures !Present(form) ==>
      PostStep(s, Parsed(form), random, faults) == (s, Response(400, MessageBody(MissingFieldsMessage)))
  {
    var a := Admit(Parsed(form));
    if a.Admitted? {
      PersistStatuses(s, a.fields, a.file.content, StoredFilename(random, a.file.name), faults);
    }
  }

  /** A body that cannot be parsed answers 500 with what parsing threw, and
      the store is unchanged. */
  lemma PostParseFailure(s: Store, e: Thrown, random: seq<byte>, faults: Faults)
    requires |random| == RandomLength
    ensures PostStep(s, Unparseable(e), random, faults) == (s, Response(500, MessageBody(MessageOf(e))))
    ensures e.OtherValue? ==> PostStep(s, Unparseable(e), random, faults).1.body == MessageBody("Unknown error")
  {
  }

  /** A non-empty text part sent as `image` passes the presence check, then
      throws when its (missing) `name` is split: 500, and the store is
      unchanged. */
  lemma PostTextImage(s: Store, form: map<FieldName, FormValue>, random: seq<byte>, faults: Faults)
    requires |random| == RandomLength
    requires Present(form) && form[ImageField].TextPart?
    ensures PostStep(s, Parsed(form), random, faults) == (s, Response(500, MessageBody(SplitOfUndefinedMessage)))
  {
  }

  /** A 201 comes exactly from a parsed form that passes the presence check,
      carries a file, and meets no I/O failure. Then one file is written under
      the stored name and one row is appended, holding the trimmed fields in
      column order with the file's public path as its `image`. */
  lemma PostSucceeds(s: Store, req: Request, random: seq<byte>, faults: Faults)
    requires |random| == RandomLength
    ensures var (t, resp) := PostStep(s, req, random, faults);
      resp.status == 201 <==>
        req.Parsed? && Present(req.form) && req.form[ImageField].FilePart? && faults == NoFaults
    ensures var (t, resp) := PostStep(s, req, random, faults);
      resp.status == 201 ==>
        var file := req.form[ImageField].file;
        var filename := StoredFilename(random, file.name);
        var f := TrimmedFields(req.form);
        && resp.body == SuccessBody
        && t.dirReady
        && t.files == s.files[filename := file.content]
        && t.rows == s.rows + [Row(s.nextId, f.name, f.address, f.city, f.state, f.contact,
                                   PublicPrefix + filename, f.email_id)]
        && t.nextId == s.nextId + 1
  {
  }

  /** On success the table grows by exactly one row, and the directory by
      exactly one file unless the random name was already taken. */
  lemma PostAddsOneFileAndRow(s: Store, req: Request, random: seq<byte>, faults: Faults)
    requires |random| == RandomLength
    requires PostStep(s, req, random, faults).1.status == 201
    ensures var t := PostStep(s, req, random, faults).0;
      var filename := StoredFilename(random, req.form[ImageField].file.name);
      && |t.rows| == |s.rows| + 1
      && t.files.Keys == s.files.Keys + {filename}
      && (filename !in s.files ==> |t.files| == |s.files| + 1)
  {
    PostSucceeds(s, req, random, faults);
  }

  /** A failing `mkdir` or `writeFile` aborts with a 500 carrying the error's
      message, before any row is inserted and without adding a file. */
  lemma PostWriteFailure(s: Store, form: map<FieldName, FormValue>, random: seq<byte>, faults: Faults)
    requires |random| == RandomLength
    requires Present(form) && form[ImageField].FilePart?
    requires faults.mkdir.Some? || faults.write.Some?
    ensures var (t, resp) := PostStep(s, Parsed(form), random, faults);
      var err := if faults.mkdir.Some? then faults.mkdir.value else faults.write.value;
      t.rows == s.rows && t.files == s.files && t.nextId == s.nextId
      && resp == Response(500, MessageBody(MessageOf(err)))
  {
  }

  /** A failing insert answers 500 with the error's message, and the image
      already written stays in the directory with no row pointing at it. */
  lemma PostInsertFailureOrphansFile(s: Store, form: map<FieldName, FormValue>, random: seq<byte>, faults: Faults)
    requires |random| == RandomLength
    requires Present(form) && form[ImageField].FilePart?
    requires faults.mkdir.None? && faults.write.None? && faults.insert.Some?
    ensures var (t, resp) := PostStep(s, Parsed(form), random, faults);
      var filename := StoredFilename(random, form[ImageField].file.name);
      && t.rows == s.rows && t.nextId == s.nextId
      && t.files == s.files[filename := form[ImageField].file.content]
      && resp == Response(500, MessageBody(MessageOf(faults.insert.value)))
  {
  }

  /** The fields a row may hold: all six non-empty and trimmed. */
  predicate FieldsNormal(f: Fields)
  {
    RowNormal(Row(0, f.name, f.address, f.city, f.state, f.contact, "", f.email_id))
  }

  /** Creating the directory keeps the invariant. */
  lemma MakeDirectoryPreservesValid(s: Store)
    requires Valid(s)
    ensures Valid(s.(dirReady := true))
  {
    var t := s.(dirReady := true);
    assert forall i :: 0 <= i < |s.rows| ==> ImageStored(t, s.rows[i].image) by {
      forall i | 0 <= i < |s.rows| ensures ImageStored(t, s.rows[i].image) {
        assert ImageStored(s, s.rows[i].image);
      }
    }
  }

  /** Writing a file into an existing directory keeps the invariant: files
      are only added or replaced, never removed. */
  lemma WriteFilePreservesValid(s: Store, filename: string, content: seq<byte>)
    requires Valid(s) && s.dirReady
    ensures Valid(s.(files := s.files[filename := content]))
  {
    var t := s.(files := s.files[filename := content]);
    assert forall i :: 0 <= i < |s.rows| ==> ImageStored(t, s.rows[i].image) by {
      forall i | 0 <= i < |s.rows| ensures ImageStored(t, s.rows[i].image) {
        assert ImageStored(s, s.rows[i].image);
      }
    }
  }

  /** Appending a row with the next id keeps the invariant, provided its image
      file is already there and its fields are non-empty and trimmed. */
  lemma InsertRowPreservesValid(s: Store, f: Fields, image: string)
    requires Valid(s) && ImageStored(s, image) && FieldsNormal(f)
    ensures Valid(s.(rows := s.rows + [Row(s.nextId, f.name, f.address, f.city, f.state,
                                           f.contact, image, f.email_id)],
                     nextId := s.nextId + 1))
  {
  }

  /** The store steps keep the invariant: files are only added, and the row
      is appended only after its image file was written. */
  lemma PersistPreservesValid(s: Store, fields: Fields, content: seq<byte>, filename: string, faults: Faults)
    requires Valid(s) && FieldsNormal(fields)
    ensures Valid(Persist(s, fields, content, filename, faults).0)
  {
    if faults.mkdir.None? {
      var s1 := s.(dirReady := true);
      MakeDirectoryPreservesValid(s);
      if faults.write.None? {
        var s2 := s1.(files := s1.files[filename := content]);
        WriteFilePreservesValid(s1, filename, content);
        if faults.insert.None? {
          assert ImageStored(s2, ReferencePath(filename));
          InsertRowPreservesValid(s2, fields, ReferencePath(filename));
        }
      }
    }
  }

  /** A request that gets past the presence check carries fields a row may hold. */
  lemma AdmittedFieldsNormal(req: Request)
    ensures Admit(req).Admitted? ==> FieldsNormal(Admit(req).fields)
  {
  }

  /** `POST` keeps the store's invariant; in particular no row is ever
      inserted without its image file having been written first. */
  lemma PostPreservesValid(s: Store, req: Request, random: seq<byte>, faults: Faults)
    requires |random| == RandomLength
    requires Valid(s)
    ensures Valid(PostStep(s, req, random, faults).0)
  {
    var a := Admit(req);
    AdmittedFieldsNormal(req);
    if a.Admitted? {
      PersistPreservesValid(s, a.fields, a.file.content, StoredFilename(random, a.file.name), faults);
    }
  }

  // ---------------------------------------------------------------------------
  // What GET promises

  /** Reversing keeps every row, as often as it occurs. */
  lemma {:induction false} ListingSameRows(rows: seq<Row>)
    ensures multiset(Listing(rows)) == multiset(rows)
  {
    if rows != [] {
      var init, last := rows[..|rows| - 1], rows[|rows| - 1];
      assert Listing(rows) == [last] + Listing(init);
      ListingSameRows(init);
      assert rows == init + [last];
      calc {
        multiset(Listing(rows));
        multiset([last]) + multiset(Listing(init));
        multiset([last]) + multiset(init);
        multiset(rows);
      }
    }
  }

  /** A table in insertion order lists newest first, by strictly descending id. */
  lemma ListingDescending(rows: seq<Row>)
    requires AscendingIds(rows)
    ensures DescendingIds(Listing(rows))
    ensures multiset(Listing(rows)) == multiset(rows)
  {
    ListingSameRows(rows);
  }

  /** In a strictly descending sequence the first row has the largest id,
      and it is the only row with that id. */
  lemma FirstIsLargest(a: seq<Row>, x: Row)
    requires DescendingIds(a) && x in multiset(a)
    ensures x.id <= a[0].id
    ensures x.id == a[0].id ==> x == a[0]
  {
    assert x in a;
    var k :| 0 <= k < |a| && a[k] == x;
  }

  /** Two sequences in strictly descending id order holding the same rows are
      equal: `ORDER BY id DESC` determines the answer. */
  lemma {:induction false} DescendingUnique(a: seq<Row>, b: seq<Row>)
    requires DescendingIds(a) && DescendingIds(b)
    requires multiset(a) == multiset(b)
    ensures a == b
  {
    if a == [] {
      assert |multiset(b)| == 0;
    } else {
      assert |b| == |multiset(b)| == |multiset(a)| == |a|;
      FirstIsLargest(b, a[0]);
      FirstIsLargest(a, b[0]);
      assert a[0] == b[0];
      assert a == [a[0]] + a[1..];
      assert b == [b[0]] + b[1..];
      assert multiset(a[1..]) == multiset(a) - multiset{a[0]};
      assert multiset(b[1..]) == multiset(b) - multiset{b[0]};
      DescendingUnique(a[1..], b[1..]);
    }
  }

  /** The listing is the only answer `ORDER BY id DESC` allows for a valid table. */
  lemma ListingIsOrderByIdDesc(rows: seq<Row>, answer: seq<Row>)
    requires AscendingIds(rows)
    requires DescendingIds(answer) && multiset(answer) == multiset(rows)
    ensures answer == Listing(rows)
  {
    ListingDescending(rows);
    DescendingUnique(answer, Listing(rows));
  }

  /** An empty table lists as an empty array with status 200, not an error. */
  lemma GetEmptyTable(s: Store)
    requires s.rows == []
    ensures GetStep(s, None) == Response(200, RowsBody([]))
  {
  }

  /** A failing query answers 500 with the error's message and no rows. */
  lemma GetFailure(s: Store, err: Thrown)
    ensures GetStep(s, Some(err)) == Response(500, MessageBody(MessageOf(err)))
    ensures !GetStep(s, Some(err)).body.RowsBody?
  {
  }

  /** After a successful `POST`, `GET` lists the new row first, then the rows
      listed before. */
  lemma ListingAfterPost(s: Store, req: Request, random: seq<byte>, faults: Faults)
    requires |random| == RandomLength
    requires PostStep(s, req, random, faults).1.status == 201
    ensures var t := PostStep(s, req, random, faults).0;
      && |t.rows| == |s.rows| + 1
      && Listing(t.rows) == [t.rows[|s.rows|]] + Listing(s.rows)
      && t.rows[|s.rows|].id == s.nextId
  {
    var t := PostStep(s, req, random, faults).0;
    PostSucceeds(s, req, random, faults);
    assert t.rows[..|t.rows| - 1] == s.rows;
  }

  // ---------------------------------------------------------------------------
  // The route as a stateful object

  /** The image directory and the `schools` table the route works on; `Post`
      and `Get` perform the route's steps in the source's order. */
  class SchoolsApi {
    var dirReady: bool
    var files: map<string, seq<byte>>
    var rows: seq<Row>
    var nextId: nat

    function State(): Store
      reads this
    {
      Store(dirReady, files, rows, nextId)
    }

    constructor ()
      ensures State() == Empty
    {
      dirReady, files, rows, nextId := false, map[], [], 1;
    }

    /** `fs.mkdir(destDir, { recursive: true })`. */
    method MakeImageDirectory(fault: Option<Thrown>)
      requires Valid(State())
      modifies this
      ensures Valid(State())
      ensures fault.None? ==> State() == old(State()).(dirReady := true)
      ensures fault.Some? ==> State() == old(State())
    {
      MakeDirectoryPreservesValid(State());
      if fault.None? {
        dirReady := true;
      }
    }

    /** `fs.writeFile(path.join(destDir, filename), content)`: creates or replaces one file. */
    method WriteImage(filename: string, content: seq<byte>, fault: Option<Thrown>)
      requires Valid(State()) && dirReady
      modifies this
      ensures Valid(State())
      ensures fault.None? ==> State() == old(State()).(files := old(files)[filename := content])
      ensures fault.Some? ==> State() == old(State())
    {
      WriteFilePreservesValid(State(), filename, content);
      if fault.None? {
        files := files[filename := content];
      }
    }

    /** `INSERT INTO schools (...) VALUES (...)`: appends one row under the next id. */
    method InsertRow(f: Fields, image: string, fault: Option<Thrown>)
      requires Valid(State()) && ImageStored(State(), image) && FieldsNormal(f)
      modifies this
      ensures Valid(State())
      ensures fault.None? ==> State() == old(State()).(
        rows := old(rows) + [Row(old(nextId), f.name, f.address, f.city, f.state, f.contact, image, f.email_id)],
        nextId := old(nextId) + 1)
      ensures fault.Some? ==> State() == old(State())
    {
      InsertRowPreservesValid(State(), f, image);
      if fault.None? {
        rows := rows + [Row(nextId, f.name, f.address, f.city, f.state, f.contact, image, f.email_id)];
        nextId := nextId + 1;
      }
    }

    /** Lines 45-55 of the handler: the directory, the file and the row, each
        only if the step before did not throw. */
    method Save(fields: Fields, content: seq<byte>, filename: string, faults: Faults) returns (resp: Response)
      requires Valid(State()) && FieldsNormal(fields)
      modifies this
      ensures Valid(State())
      ensures (State(), resp) == Persist(old(State()), fields, content, filename, faults)
    {
      MakeImageDirectory(faults.mkdir);
      if faults.mkdir.Some? {
        return ServerError(faults.mkdir.value);
      }
      WriteImage(filename, content, faults.write);
      if faults.write.Some? {
        return ServerError(faults.write.value);
      }
      assert ImageStored(State(), ReferencePath(filename));
      InsertRow(fields, ReferencePath(filename), faults.insert);
      if faults.insert.Some? {
        return ServerError(faults.insert.value);
      }
      return Response(201, SuccessBody);
    }

    /** `POST /api/schools`: the pure admission step (trim, presence check),
        then the stored name, then `Save`. */
    method Post(req: Request, random: seq<byte>, faults: Faults) returns (resp: Response)
      requires |random| == RandomLength
      requires Valid(State())
      modifies this
      ensures Valid(State())
      ensures (State(), resp) == PostStep(old(State()), req, random, faults)
    {
      var admission := Admit(req);
      AdmittedFieldsNormal(req);
      if admission.Rejected? {
        return admission.response;
      }
      var filename := StoredFilename(random, admission.file.name);
      resp := Save(admission.fields, admission.file.content, filename, faults);
    }

    /** `GET /api/schools`: every row, newest first, or a 500 when the query throws. */
    method Get(fault: Option<Thrown>) returns (resp: Response)
      requires Valid(State())
      ensures fault.Some? ==> resp == Response(500, MessageBody(MessageOf(fault.value)))
      ensures fault.None? ==>
                resp.status == 200 && resp.body.RowsBody? &&
                DescendingIds(resp.body.rows) && multiset(resp.body.rows) == multiset(rows)
      ensures resp == GetStep(State(), fault)
    {
      if fault.Some? {
        return ServerError(fault.value);
      }
      ListingDescending(rows);
      return Response(200, RowsBody(Listing(rows)));
    }
  }
}
