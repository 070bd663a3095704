/** The two validation passes side by side. The browser checks format
    (lengths, digits, e-mail syntax, a non-empty image) on the raw values; the
    server checks only that each trimmed field and the image are there. The
    lemmas below show that neither pass implies the other. */
module TrustBoundary {
  import opened Common
  import opened JsString
  import opened ImageStore
  import opened SchoolsRoute
  import opened AddSchoolForm

  /** No field of the form is blank to `trim`. */
  predicate NoBlankField(f: FormInput)
  {
    !AllWhitespace(f.name) && !AllWhitespace(f.address) && !AllWhitespace(f.city)
    && !AllWhitespace(f.state) && !AllWhitespace(f.contact) && !AllWhitespace(f.email_id)
  }

  /** The server reads back the six text fields as sent, trimmed. */
  lemma BodyFieldsTrimmed(f: FormInput, image: File)
    ensures TrimmedFields(FormBody(f, image).form)
         == Fields(Trim(f.name), Trim(f.address), Trim(f.city), Trim(f.state),
                   Trim(f.contact), Trim(f.email_id))
    ensures FormBody(f, image).form[ImageField] == FilePart(image)
  {
    var form := FormBody(f, image).form;
    assert FieldText(form, NameField) == f.name;
    assert FieldText(form, AddressField) == f.address;
    assert FieldText(form, CityField) == f.city;
    assert FieldText(form, StateField) == f.state;
    assert FieldText(form, ContactField) == f.contact;
    assert FieldText(form, EmailIdField) == f.email_id;
  }

  /** The server checks presence only: a body whose six fields are not blank
      and whose image is a file, of any size, is stored when no I/O step
      fails, whatever the lengths, digits or e-mail syntax. */
  lemma ServerChecksPresenceOnly(s: Store, f: FormInput, image: File, random: seq<byte>)
    requires |random| == RandomLength
    requires NoBlankField(f)
    ensures PostStep(s, FormBody(f, image), random, NoFaults).1 == Response(201, SuccessBody)
  {
    BodyFieldsTrimmed(f, image);
    assert Present(FormBody(f, image).form);
  }

  /** Each format defect alone fails the browser's schema and shows that
      field's message: a one-character name, a contact with a non-digit in
      it, and an image that is a zero-byte `File`, an empty `FileList`, or a
      `FileList` whose first file has zero bytes. */
  lemma SchemaRejectsFormat(f: FormInput, isEmail: string -> bool)
    ensures |f.name| == 1 && f.name[0] as int < 0x1_0000 ==>
              !ShortFieldOk(f.name) && NameField in FieldErrors(f, isEmail)
    ensures (exists i :: 0 <= i < |f.contact| && !IsAsciiDigit(f.contact[i])) ==>
              !ContactOk(f.contact) && ContactField in FieldErrors(f, isEmail)
    ensures (f.image.FileInput? && f.image.file.Size() == 0)
            || f.image == FileListInput([])
            || (f.image.FileListInput? && |f.image.files| > 0 && f.image.files[0].Size() == 0) ==>
              !ImageOk(f.image) && ImageField in FieldErrors(f, isEmail)
  {
    if |f.name| == 1 && f.name[0] as int < 0x1_0000 {
      Utf16LengthBmp(f.name);
      assert !FieldOk(f, isEmail, NameField);
    }
  }

  /** Yet the server stores a form with any one of those defects (the image
      being a `File`), as long as no field is blank. */
  lemma ServerAcceptsWhatClientRejects(s: Store, f: FormInput, random: seq<byte>, isEmail: string -> bool)
    requires |random| == RandomLength
    requires NoBlankField(f)
    requires f.image.FileInput?
    requires || (|f.name| == 1 && f.name[0] as int < 0x1_0000)
             || (exists i :: 0 <= i < |f.contact| && !IsAsciiDigit(f.contact[i]))
             || f.image.file.Size() == 0
    ensures !SchemaAccepts(f, isEmail)
    ensures PostStep(s, FormBody(f, f.image.file), random, NoFaults).1.status == 201
  {
    SchemaRejectsFormat(f, isEmail);
    ServerChecksPresenceOnly(s, f, f.image.file, random);
  }

  /** The browser does not trim, so a field of whitespace alone can pass its
      length check; the server trims it to nothing and answers 400 without
      touching the store. */
  lemma BlankFieldRejectedByServer(s: Store, f: FormInput, image: File, random: seq<byte>, faults: Faults)
    requires |random| == RandomLength
    requires !NoBlankField(f)
    ensures PostStep(s, FormBody(f, image), random, faults) == (s, Response(400, MessageBody(MissingFieldsMessage)))
  {
    BodyFieldsTrimmed(f, image);
  }

  /** The browser counts whitespace: a name of two spaces passes `.min(2)`,
      and `trim` turns it into the empty string the server rejects. */
  lemma TwoSpacesName()
    ensures ShortFieldOk("  ") && AllWhitespace("  ") && Trim("  ") == []
  {
    MinLengthByCharacters("  ", 2);
  }

  /** So the schema can accept a form whose submission the server refuses:
      with a blank name, the page's post gets 400 and changes nothing. */
  lemma ClientAcceptsWhatServerRejects(s: Store, f: FormInput, isEmail: string -> bool,
                                       random: seq<byte>, faults: Faults)
    requires |random| == RandomLength
    requires SchemaAccepts(f, isEmail) && AllWhitespace(f.name)
    ensures PostStep(s, Submission(f, isEmail), random, faults)
         == (s, Response(400, MessageBody(MissingFieldsMessage)))
  {
    BlankFieldRejectedByServer(s, f, SelectedFile(f.image), random, faults);
  }

  /** A contact the schema accepts is digits only, so `trim` leaves it as it
      is and the server's presence check on it passes. */
  lemma AcceptedContactUntouched(s: string)
    requires ContactOk(s)
    ensures Trim(s) == s && s != []
  {
    assert !IsJsWhitespace(s[0]) && !IsJsWhitespace(s[|s| - 1]);
    TrimUnpadded(s);
  }

  /** What happens to a form the schema accepts and whose other fields are not
      blank: the server stores the selected file under a random name with its
      extension, and appends one row holding the trimmed fields, the contact as
      typed and the file's public path. */
  lemma ClientAcceptedIsStored(s: Store, f: FormInput, isEmail: string -> bool, random: seq<byte>)
    requires |random| == RandomLength
    requires SchemaAccepts(f, isEmail)
    requires !AllWhitespace(f.name) && !AllWhitespace(f.address) && !AllWhitespace(f.city)
    requires !AllWhitespace(f.state) && !AllWhitespace(f.email_id)
    ensures var file := SelectedFile(f.image);
      var filename := StoredFilename(random, file.name);
      var (t, resp) := PostStep(s, Submission(f, isEmail), random, NoFaults);
      && resp == Response(201, SuccessBody)
      && t.files == s.files[filename := file.content]
      && t.rows == s.rows + [Row(s.nextId, Trim(f.name), Trim(f.address), Trim(f.city), Trim(f.state),
                                 f.contact, PublicPrefix + filename, Trim(f.email_id))]
  {
    var file := SelectedFile(f.image);
    AcceptedContactUntouched(f.contact);
    BodyFieldsTrimmed(f, file);
    ServerChecksPresenceOnly(s, f, file, random);
    PostSucceeds(s, Submission(f, isEmail), random, NoFaults);
  }
}
