/** The add-school page's record validator (a `zod` schema checked in the
    browser before anything is sent) and the multipart body it then posts. */
module AddSchoolForm {
  import opened Common
  import opened JsString
  import SchoolsRoute

  /** What the file input yields: a `File`, a `FileList`, or anything else. */
  datatype ImageInput = FileInput(file: File) | FileListInput(files: seq<File>) | OtherInput

  /** The form's values as typed: the client never trims them. */
  datatype FormInput = FormInput(name: string, address: string, city: string, state: string,
                                 contact: string, email_id: string, image: ImageInput)

  /** `z.string().min(n)`: at least `n` UTF-16 code units. */
  predicate MinLength(s: string, n: nat)
  {
    Utf16Length(s) >= n
  }

  /** `name`, `city` and `state`: `.min(2)`. */
  predicate ShortFieldOk(s: string)
  {
    MinLength(s, 2)
  }

  /** `address`: `.min(5)`. */
  predicate AddressOk(s: string)
  {
    MinLength(s, 5)
  }

  /** `/^\d{7,15}$/`: seven to fifteen ASCII digits and nothing else. */
  predicate MatchesContactPattern(s: string)
  {
    7 <= |s| <= 15 && forall i :: 0 <= i < |s| ==> IsAsciiDigit(s[i])
  }

  /** `contact`: `.min(7)` then the digit pattern. */
  predicate ContactOk(s: string)
  {
    MinLength(s, 7) && MatchesContactPattern(s)
  }

  /** `image`: a `File` of non-zero size, or a non-empty `FileList` whose first
      file has non-zero size. */
  predicate ImageOk(v: ImageInput)
  {
    match v
    case FileInput(f) => f.Size() > 0
    case FileListInput(fs) => |fs| > 0 && fs[0].Size() > 0
    case OtherInput => false
  }

  /** The whole schema; `isEmail` stands for `z.string().email()`. */
  predicate SchemaAccepts(f: FormInput, isEmail: string -> bool)
  {
    && ShortFieldOk(f.name) && AddressOk(f.address) && ShortFieldOk(f.city)
    && ShortFieldOk(f.state) && ContactOk(f.contact) && isEmail(f.email_id) && ImageOk(f.image)
  }

  const AllFields: set<FieldName> :=
    {NameField, AddressField, CityField, StateField, ContactField, EmailIdField, ImageField}

  /** The schema's check for one field. */
  predicate FieldOk(f: FormInput, isEmail: string -> bool, key: FieldName)
  {
    match key
    case NameField => ShortFieldOk(f.name)
    case AddressField => AddressOk(f.address)
    case CityField => ShortFieldOk(f.city)
    case StateField => ShortFieldOk(f.state)
    case ContactField => ContactOk(f.contact)
    case EmailIdField => isEmail(f.email_id)
    case ImageField => ImageOk(f.image)
  }

  /** The message of a field's first failing check. */
  function ErrorMessage(f: FormInput, key: FieldName): string
  {
    match key
    case NameField => "Name is required"
    case AddressField => "Address is required"
    case CityField => "City is required"
    case StateField => "State is required"
    case ContactField =>
      if !MinLength(f.contact, 7) then "Contact is required"
      else "Contact must be a number with 7-15 digits"
    case EmailIdField => "Invalid email"
    case ImageField => "Image is required"
  }

  /** The message shown under each field whose check fails. */
  function FieldErrors(f: FormInput, isEmail: string -> bool): map<FieldName, string>
  {
    map key | key in AllFields && !FieldOk(f, isEmail, key) :: ErrorMessage(f, key)
  }

  /** The schema accepts exactly when no field shows an error. */
  lemma FieldErrorsEmpty(f: FormInput, isEmail: string -> bool)
    ensures FieldErrors(f, isEmail) == map[] <==> SchemaAccepts(f, isEmail)
  {
    var e := FieldErrors(f, isEmail);
    if SchemaAccepts(f, isEmail) {
      assert forall key :: FieldOk(f, isEmail, key);
      assert e.Keys == {};
    } else {
      var key :| key in AllFields && !FieldOk(f, isEmail, key);
      assert key in e;
    }
  }

  /** Which of the two contact messages is shown: the length message when
      `.min(7)` fails, the pattern message when only the pattern fails. */
  lemma ContactErrorMessage(f: FormInput, isEmail: string -> bool)
    ensures !MinLength(f.contact, 7) ==>
              ContactField in FieldErrors(f, isEmail)
              && FieldErrors(f, isEmail)[ContactField] == "Contact is required"
    ensures MinLength(f.contact, 7) && !MatchesContactPattern(f.contact) ==>
              ContactField in FieldErrors(f, isEmail)
              && FieldErrors(f, isEmail)[ContactField] == "Contact must be a number with 7-15 digits"
    ensures ContactOk(f.contact) ==> ContactField !in FieldErrors(f, isEmail)
  {
  }

  /** `.min(7)` adds nothing to the digit pattern: every string the pattern
      accepts is at least seven code units long. */
  lemma ContactMinSubsumed(s: string)
    ensures ContactOk(s) <==> MatchesContactPattern(s)
  {
    if MatchesContactPattern(s) {
      Utf16LengthBmp(s);
    }
  }

  /** Lengths count UTF-16 code units: any single character outside the Basic
      Multilingual Plane satisfies `.min(2)`. */
  lemma AstralCharacterCountsTwice(c: char)
    requires c as int >= 0x1_0000
    ensures ShortFieldOk([c])
  {
    assert Utf16Length([c]) == 2 + Utf16Length([]);
  }

  /** For text in the Basic Multilingual Plane (one code unit per character),
      `.min(n)` holds exactly when there are at least `n` characters: so
      `name`, `city` and `state` pass iff they have two or more, `address`
      iff it has five or more. */
  lemma MinLengthBmp(s: string, n: nat)
    requires forall i :: 0 <= i < |s| ==> s[i] as int < 0x1_0000
    ensures MinLength(s, n) <==> |s| >= n
  {
    Utf16LengthBmp(s);
  }

  /** Any string of at least `n` characters satisfies `.min(n)`; whitespace
      counts, since nothing is trimmed. */
  lemma MinLengthByCharacters(s: string, n: nat)
    requires |s| >= n
    ensures MinLength(s, n)
  {
  }

  /** The file that is sent: `data.image` itself when it is a `File`, else the
      first entry of the `FileList`. Only called once the schema has passed. */
  function SelectedFile(v: ImageInput): (file: File)
    requires ImageOk(v)
    ensures file.Size() > 0
    ensures v.FileInput? ==> file == v.file
    ensures v.FileListInput? ==> file == v.files[0]
  {
    if v.FileInput? then v.file else v.files[0]
  }

  /** The `FormData` body: the six text fields as typed, and the image. */
  function FormBody(f: FormInput, image: File): (req: SchoolsRoute.Request)
    ensures req.Parsed? && req.form.Keys == {NameField, AddressField, CityField, StateField,
                                             ContactField, EmailIdField, ImageField}
    ensures SchoolsRoute.FieldText(req.form, NameField) == f.name
    ensures SchoolsRoute.FieldText(req.form, AddressField) == f.address
    ensures SchoolsRoute.FieldText(req.form, CityField) == f.city
    ensures SchoolsRoute.FieldText(req.form, StateField) == f.state
    ensures SchoolsRoute.FieldText(req.form, ContactField) == f.contact
    ensures SchoolsRoute.FieldText(req.form, EmailIdField) == f.email_id
    ensures req.form[ImageField] == SchoolsRoute.FilePart(image)
  {
    SchoolsRoute.Parsed(map[
      NameField := SchoolsRoute.TextPart(f.name),
      AddressField := SchoolsRoute.TextPart(f.address),
      CityField := SchoolsRoute.TextPart(f.city),
      StateField := SchoolsRoute.TextPart(f.state),
      ContactField := SchoolsRoute.TextPart(f.contact),
      EmailIdField := SchoolsRoute.TextPart(f.email_id),
      ImageField := SchoolsRoute.FilePart(image)])
  }

  /** What the page posts once the schema accepts the form. */
  function Submission(f: FormInput, isEmail: string -> bool): (req: SchoolsRoute.Request)
    requires SchemaAccepts(f, isEmail)
    ensures req.Parsed? && ImageField in req.form
    ensures req.form[ImageField].FilePart? && req.form[ImageField].file.Size() > 0
    ensures forall key | key in req.form && key != ImageField :: req.form[key].TextPart?
  {
    FormBody(f, SelectedFile(f.image))
  }
}
