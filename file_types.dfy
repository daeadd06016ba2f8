/**
 * Telling file formats apart by name, and the dispatch of importFile and exportImage
 * (mcard.py, lines 301-358). The S-record, Intel HEX and raw binary codecs belong to
 * the bincopy library; they are represented here only by the format they were asked for.
 */
module FileTypes {
  import opened Wrappers
  import opened Errors
  import opened Hex
  import opened Text
  import opened HexFile

  /** The four tags getFileType can return. */
  datatype FileFormat = SRecord | Binary | HexPairs | IntelHex

  /** The string getFileType returns for a format. */
  function TypeName(f: FileFormat): string {
    match f
    case SRecord => "srecord"
    case Binary => "binary"
    case HexPairs => "hex"
    case IntelHex => "intelhex"
  }

  /** The lower-case extension that selects a format. */
  function ExtensionOf(f: FileFormat): string {
    match f
    case SRecord => "s19"
    case Binary => "bin"
    case HexPairs => "hex"
    case IntelHex => "ihex"
  }

  /** k is the last '.' of the name that still has a character after it. */
  predicate IsLastDot(name: string, k: int) {
    0 <= k < |name| - 1 && name[k] == '.' && forall j :: k < j < |name| - 1 ==> name[j] != '.'
  }

  /** The largest index below n holding a '.'. */
  function LastDotBefore(s: string, n: nat): (k: Option<nat>)
    requires n <= |s|
    ensures k.Some? ==> k.value < n && s[k.value] == '.' && forall j :: k.value < j < n ==> s[j] != '.'
    ensures k.None? ==> forall j :: 0 <= j < n ==> s[j] != '.'
    decreases n
  {
    if n == 0 then None
    else if s[n - 1] == '.' then Some(n - 1)
    else LastDotBefore(s, n - 1)
  }

  /**
   * The group of re.search(".*\\.(.+)$", name, re.S): the greedy ".*" puts the match on the
   * last '.' that still leaves at least one character after it, and the group runs to the
   * end of the name (re.S lets it take a final "\n" too).
   */
  function Extension(name: string): (e: Option<string>)
    ensures e.None? <==> forall j :: 0 <= j < |name| - 1 ==> name[j] != '.'
    ensures e.Some? ==> exists k :: IsLastDot(name, k) && e.value == name[k + 1..]
  {
    if |name| == 0 then None
    else match LastDotBefore(name, |name| - 1)
      case None => None
      case Some(k) =>
        assert IsLastDot(name, k);
        Some(name[k + 1..])
  }

  /** The last usable '.' decides the extension. */
  lemma ExtensionAt(name: string, k: nat)
    requires IsLastDot(name, k)
    ensures Extension(name) == Some(name[k + 1..])
  {
    assert Extension(name).Some?;
    var k' :| IsLastDot(name, k') && Extension(name).value == name[k' + 1..];
    assert k' == k;
  }

  /** The comparisons of getFileType on the lower-cased extension. */
  function FormatOfExtension(ext: string): (f: Option<FileFormat>)
    ensures f.Some? ==> ext == ExtensionOf(f.value)
  {
    if ext == "s19" then Some(SRecord)
    else if ext == "bin" then Some(Binary)
    else if ext == "hex" then Some(HexPairs)
    else if ext == "ihex" then Some(IntelHex)
    else None
  }

  /** Each format is selected by its extension, and only by it. */
  lemma FormatOfExtensionInverse(ext: string, f: FileFormat)
    ensures FormatOfExtension(ext) == Some(f) <==> ext == ExtensionOf(f)
  {
  }

  /** getFileType (mcard.py:323-344); a name with no known extension yields None. */
  function GetFileType(filename: string): (f: Option<FileFormat>)
    ensures Extension(filename).None? ==> f.None?
    ensures f.Some? ==> Extension(filename).Some? && Lower(Extension(filename).value) == ExtensionOf(f.value)
  {
    match Extension(filename)
    case None => None
    case Some(ext) => FormatOfExtension(Lower(ext))
  }

  /** The four tags of getFileType are distinct strings, so the string result tells the formats apart. */
  lemma TypeNameInjective(f: FileFormat, g: FileFormat)
    ensures TypeName(f) == TypeName(g) <==> f == g
    ensures TypeName(f) in ["srecord", "hex", "intelhex", "binary"]
  {
  }

  /** A name "base.ext" whose ext holds no '.' before its last character is classified by ext alone, lower-cased. */
  lemma GetFileTypeOfExtension(base: string, ext: string)
    requires 0 < |ext| && forall j :: 0 <= j < |ext| - 1 ==> ext[j] != '.'
    ensures GetFileType(base + "." + ext) == FormatOfExtension(Lower(ext))
  {
    var name := base + "." + ext;
    assert forall j :: |base| < j < |name| ==> name[j] == ext[j - |base| - 1];
    assert IsLastDot(name, |base|);
    ExtensionAt(name, |base|);
    assert name[|base| + 1..] == ext;
  }

  /** A name with no usable '.' has no type. */
  lemma GetFileTypeNoDot(filename: string)
    requires forall j :: 0 <= j < |filename| - 1 ==> filename[j] != '.'
    ensures GetFileType(filename) == None
  {
  }

  /** A known format is reported exactly when the text after the last usable '.' is its extension in some case. */
  lemma GetFileTypeSome(filename: string, f: FileFormat)
    ensures GetFileType(filename) == Some(f) <==>
      exists k :: IsLastDot(filename, k) && Lower(filename[k + 1..]) == ExtensionOf(f)
  {
    if exists k :: IsLastDot(filename, k) && Lower(filename[k + 1..]) == ExtensionOf(f) {
      var k :| IsLastDot(filename, k) && Lower(filename[k + 1..]) == ExtensionOf(f);
      ExtensionAt(filename, k);
    }
    if GetFileType(filename) == Some(f) {
      var k :| IsLastDot(filename, k) && Extension(filename).value == filename[k + 1..];
      assert Lower(filename[k + 1..]) == ExtensionOf(f);
    }
  }

  /** The case of the extension does not matter. */
  lemma GetFileTypeIgnoresCase(base: string, ext: string)
    requires 0 < |ext| && forall j :: 0 <= j < |ext| - 1 ==> ext[j] != '.'
    ensures GetFileType(base + "." + ext) == GetFileType(base + "." + Lower(ext))
  {
    GetFileTypeOfExtension(base, ext);
    GetFileTypeOfExtension(base, Lower(ext));
    assert Lower(Lower(ext)) == Lower(ext);
  }

  /** A typical name: the extension is matched in any case. */
  lemma SRecordExample()
    ensures GetFileType("blink.S19") == Some(SRecord)
  {
    GetFileTypeOfExtension("blink", "S19");
    assert "blink" + "." + "S19" == "blink.S19";
    assert Lower("S19") == "s19";
  }

  /** Only the last extension counts: earlier dots are part of the base name. */
  lemma LastExtensionExample()
    ensures GetFileType("a.b.hex") == Some(HexPairs)
  {
    GetFileTypeOfExtension("a.b", "hex");
    assert "a.b" + "." + "hex" == "a.b.hex";
    assert Lower("hex") == "hex";
  }

  /** ... so a ".hex" file renamed to ".bak" has no type. */
  lemma RenamedExample()
    ensures GetFileType("a.hex.bak") == None
  {
    GetFileTypeOfExtension("a.hex", "bak");
    assert "a.hex" + "." + "bak" == "a.hex.bak";
    assert Lower("bak") == "bak";
  }

  // ---------------------------------------------------------------------------
  // importFile
  // ---------------------------------------------------------------------------

  /** What importFile puts into dataImage: decoded bytes for the loader's own format, or a file bincopy decodes. */
  datatype Loaded = Bytes(data: seq<byte>) | Library(format: FileFormat)

  /** importFile (mcard.py:301-316) on a file whose lines are given. */
  function Imported(filename: string, lines: seq<string>): (r: Result<Loaded, Error>)
    ensures r.Failure? <==> GetFileType(filename).None?
    ensures r.Failure? ==> r.error == UnknownFileType
    ensures r.Success? && r.value.Library? ==> r.value.format != HexPairs
  {
    match GetFileType(filename)
    case None => Failure(UnknownFileType)
    case Some(HexPairs) => Success(Bytes(LinesBytes(lines)))
    case Some(f) => Success(Library(f))
  }

  /** The type decides the decoder: ".hex" files go through importHex, the others to bincopy. */
  lemma ImportedByType(filename: string, lines: seq<string>)
    ensures GetFileType(filename) == Some(HexPairs) ==> Imported(filename, lines) == Success(Bytes(LinesBytes(lines)))
    ensures forall f :: GetFileType(filename) == Some(f) && f != HexPairs ==> Imported(filename, lines) == Success(Library(f))
  {
  }

  /** The dispatch of importFile, handing ".hex" files to importHex. */
  method ImportFile(filename: string, lines: seq<string>) returns (r: Result<Loaded, Error>)
    ensures r == Imported(filename, lines)
  {
    var t := GetFileType(filename);
    if t == Some(SRecord) {
      r := Success(Library(SRecord));
    } else if t == Some(Binary) {
      r := Success(Library(Binary));
    } else if t == Some(IntelHex) {
      r := Success(Library(IntelHex));
    } else if t == Some(HexPairs) {
      var bb := ImportHex(lines);
      r := Success(Bytes(bb));
    } else {
      r := Failure(UnknownFileType);
    }
  }

  /** dataImage.as_binary() after importFile: the bytes themselves, or what bincopy decoded (given). */
  function ImageData(loaded: Loaded, decoded: seq<byte>): seq<byte> {
    match loaded
    case Bytes(data) => data
    case Library(_) => decoded
  }

  // ---------------------------------------------------------------------------
  // exportImage
  // ---------------------------------------------------------------------------

  /** What exportImage writes: the loader's own text, or bincopy's rendering of the image in the named format. */
  datatype Exported = Text(text: string) | LibraryText(format: string, image: seq<byte>)

  /** exportImage (mcard.py:348-358) of an image holding data at address 0, under the --format option. */
  function ExportedImage(format: string, data: seq<byte>): (r: Result<Exported, Error>)
    ensures r.Failure? <==> format !in {"srec", "ihex", "hex"}
    ensures r.Failure? ==> r.error == InvalidExportFormat(format)
    ensures format == "hex" ==> r.Success? && r.value.Text?
  {
    if format == "srec" then Success(LibraryText("srec", data))
    else if format == "ihex" then Success(LibraryText("ihex", data))
    else if format == "hex" then Success(Text(HexText(data)))
    else Failure(InvalidExportFormat(format))
  }

  /** A "hex" export imported again from a ".hex" file gives back the bytes. */
  lemma HexExportImport(data: seq<byte>, base: string)
    ensures ExportedImage("hex", data).Success?
    ensures Imported(base + ".hex", ReadLines(ExportedImage("hex", data).value.text)) == Success(Bytes(data))
  {
    GetFileTypeOfExtension(base, "hex");
    assert base + "." + "hex" == base + ".hex";
    assert Lower("hex") == "hex";
    HexTextRoundTrip(data);
  }

  /** The dispatch of exportImage, handing "hex" to dataToHexStrings. */
  method ExportImage(format: string, data: seq<byte>) returns (r: Result<Exported, Error>)
    ensures r == ExportedImage(format, data)
  {
    if format == "srec" {
      r := Success(LibraryText("srec", data));
    } else if format == "ihex" {
      r := Success(LibraryText("ihex", data));
    } else if format == "hex" {
      var buf := DataToHexStrings(data);
      r := Success(Text(buf));
    } else {
      r := Failure(InvalidExportFormat(format));
    }
  }
}
