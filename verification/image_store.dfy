/** How the route names a stored image: the extension of the uploaded file's
    name, a random hexadecimal stem, and the public path the row records. */
module ImageStore {
  import opened Common
  import opened JsString
  import Hex

  /** Used when the uploaded name's last piece is empty. */
  const DefaultExtension: string := "jpg"

  /** Public URL prefix of the image directory (served from `public/schoolImages`). */
  const PublicPrefix: string := "/schoolImages/"

  /** Number of random bytes in a stored name. */
  const RandomLength: nat := 8

  /** `image.name.split('.').pop() || 'jpg'`. */
  function Extension(originalName: string): (ext: string)
    ensures '.' !in ext && ext != []
  {
    var last := LastSegment(originalName, '.');
    if last == [] then DefaultExtension else last
  }

  /** A name with a dot: the extension is the text after the last dot, or `jpg`
      when that text is empty (`"x."`). */
  lemma ExtensionAfterLastDot(prefix: string, suffix: string)
    requires '.' !in suffix
    ensures Extension(prefix + "." + suffix) == if suffix == [] then DefaultExtension else suffix
  {
    LastSegmentAfterLast(prefix, suffix, '.');
  }

  /** A name without a dot: the extension is the whole name (`"logo"` gives
      `"logo"`), or `jpg` for the empty name. */
  lemma ExtensionOfUndotted(name: string)
    requires '.' !in name
    ensures Extension(name) == if name == [] then DefaultExtension else name
  {
    LastSegmentWhole(name, '.');
  }

  /** `${randomBytes.toString('hex')}.${ext}`. */
  function StoredFilename(random: seq<byte>, originalName: string): (filename: string)
    requires |random| == RandomLength
    ensures |filename| > 2 * RandomLength + 1
  {
    Hex.Encode(random) + "." + Extension(originalName)
  }

  /** `/schoolImages/${filename}`: the value stored in the row's `image` column. */
  function ReferencePath(filename: string): (path: string)
    ensures |path| == |PublicPrefix| + |filename|
    ensures path[..|PublicPrefix|] == PublicPrefix && path[|PublicPrefix|..] == filename
  {
    PublicPrefix + filename
  }

  /** The stored name is sixteen lower-case hex digits, a dot, and the
      extension; it has that one dot only, so no `..` can appear in it. */
  lemma StoredFilenameShape(random: seq<byte>, originalName: string)
    requires |random| == RandomLength
    ensures var f := StoredFilename(random, originalName);
      && f[..16] == Hex.Encode(random)
      && (forall i :: 0 <= i < 16 ==> Hex.IsLowerHexDigit(f[i]))
      && f[17..] == Extension(originalName)
      && (forall i :: 0 <= i < |f| ==> (f[i] == '.' <==> i == 16))
  {
    var f := StoredFilename(random, originalName);
    var ext := Extension(originalName);
    assert f[17..] == ext;
    forall i | 0 <= i < |f|
      ensures f[i] == '.' <==> i == 16
    {
      if 17 <= i {
        assert f[i] == ext[i - 17];
      } else if i < 16 {
        assert Hex.IsLowerHexDigit(f[i]);
      }
    }
  }

  /** The stored file keeps the uploaded file's extension. */
  lemma StoredFilenameKeepsExtension(random: seq<byte>, originalName: string)
    requires |random| == RandomLength
    ensures Extension(StoredFilename(random, originalName)) == Extension(originalName)
  {
    ExtensionAfterLastDot(Hex.Encode(random), Extension(originalName));
  }

  /** Different random bytes give different stored names, whatever the
      uploaded names: two uploads collide only if their random bytes do. */
  lemma StoredFilenameInjective(r1: seq<byte>, n1: string, r2: seq<byte>, n2: string)
    requires |r1| == RandomLength && |r2| == RandomLength
    requires StoredFilename(r1, n1) == StoredFilename(r2, n2)
    ensures r1 == r2 && Extension(n1) == Extension(n2)
  {
    StoredFilenameShape(r1, n1);
    StoredFilenameShape(r2, n2);
    Hex.EncodeInjective(r1, r2);
  }
}
